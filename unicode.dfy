/**
  Text decoding used by the readers: strict UTF-8 (Rust's `str::from_utf8`),
  strict UTF-16 (`String::from_utf16`) and the removal of NUL padding
  (`trim_matches('\0')`). Each decoder is paired with an encoder and proved to
  be its exact inverse, so "valid" means "is the encoding of some text".
*/
module Unicode {
  import opened Wrappers
  import opened Bytes

  /** Code points that a Rust `char` (and a Dafny `char`) can hold. */
  predicate IsScalar(cp: int) {
    0 <= cp < 0xD800 || 0xE000 <= cp < 0x11_0000
  }

  predicate IsCont(b: byte) {
    0x80 <= b < 0xC0
  }

  // ---------------------------------------------------------------- UTF-8

  /**
    Decodes the first UTF-8 sequence of `b`, giving the character and the number
    of bytes it takes. Overlong forms, surrogates and values above U+10FFFF are
    rejected, as the Unicode standard's table of well-formed sequences demands.
  */
  function DecodeFirst8(b: seq<byte>): (r: Option<(char, nat)>)
    requires |b| > 0
    ensures r.Some? ==> 1 <= r.value.1 <= 4 && r.value.1 <= |b|
  {
    var b0: int := b[0];
    if b0 < 0x80 then Some((b0 as char, 1))
    else if b0 < 0xC0 then None
    else if b0 < 0xE0 then
      if |b| < 2 || !IsCont(b[1]) then None
      else
        var cp := (b0 - 0xC0) * 0x40 + (b[1] as int - 0x80);
        if cp < 0x80 then None else Some((cp as char, 2))
    else if b0 < 0xF0 then
      if |b| < 3 || !IsCont(b[1]) || !IsCont(b[2]) then None
      else
        var cp := (b0 - 0xE0) * 0x1000 + (b[1] as int - 0x80) * 0x40 + (b[2] as int - 0x80);
        if cp < 0x800 || 0xD800 <= cp < 0xE000 then None else Some((cp as char, 3))
    else if b0 < 0xF8 then
      if |b| < 4 || !IsCont(b[1]) || !IsCont(b[2]) || !IsCont(b[3]) then None
      else
        var cp := (b0 - 0xF0) * 0x4_0000 + (b[1] as int - 0x80) * 0x1000
                  + (b[2] as int - 0x80) * 0x40 + (b[3] as int - 0x80);
        if cp < 0x1_0000 || cp >= 0x11_0000 then None else Some((cp as char, 4))
    else None
  }

  /** Strict UTF-8 decoding of a whole byte string; `None` when it is not valid UTF-8. */
  function Utf8Decode(b: seq<byte>): (r: Option<string>)
    ensures r.Some? ==> |r.value| <= |b| <= 4 * |r.value|
    decreases |b|
  {
    if b == [] then Some([])
    else match DecodeFirst8(b)
      case None => None
      case Some((c, n)) =>
        match Utf8Decode(b[n..])
        case None => None
        case Some(rest) => Some([c] + rest)
  }

  /** The UTF-8 bytes of one character. */
  function Encode8(c: char): (b: seq<byte>)
    ensures 1 <= |b| <= 4
  {
    var cp := c as int;
    var q1, r0 := cp / 0x40, cp % 0x40;
    var q2, r1 := q1 / 0x40, q1 % 0x40;
    var q3, r2 := q2 / 0x40, q2 % 0x40;
    if cp < 0x80 then [cp]
    else if cp < 0x800 then [0xC0 + q1, 0x80 + r0]
    else if cp < 0x1_0000 then [0xE0 + q2, 0x80 + r1, 0x80 + r0]
    else [0xF0 + q3, 0x80 + r2, 0x80 + r1, 0x80 + r0]
  }

  function Utf8Encode(s: string): seq<byte>
  {
    if s == [] then [] else Encode8(s[0]) + Utf8Encode(s[1..])
  }

  lemma DivMod64(q: int, r: int)
    requires 0 <= r < 0x40
    ensures (0x40 * q + r) / 0x40 == q && (0x40 * q + r) % 0x40 == r
  {
  }

  /** The decoder reads back exactly one encoded character, whatever follows it. */
  lemma DecodeFirst8Encode(c: char, rest: seq<byte>)
    ensures DecodeFirst8(Encode8(c) + rest) == Some((c, |Encode8(c)|))
  {
    var cp := c as int;
    var q1, r0 := cp / 0x40, cp % 0x40;
    var q2, r1 := q1 / 0x40, q1 % 0x40;
    var q3, r2 := q2 / 0x40, q2 % 0x40;
    assert cp == 0x40 * q1 + r0;
    assert q1 == 0x40 * q2 + r1;
    assert q2 == 0x40 * q3 + r2;
    var b := Encode8(c) + rest;
    if cp < 0x80 {
    } else if cp < 0x800 {
      assert b[0] as int - 0xC0 == q1 && b[1] as int - 0x80 == r0;
    } else if cp < 0x1_0000 {
      assert b[0] as int - 0xE0 == q2 && b[1] as int - 0x80 == r1 && b[2] as int - 0x80 == r0;
    } else {
      assert b[0] as int - 0xF0 == q3;
      assert b[1] as int - 0x80 == r2 && b[2] as int - 0x80 == r1 && b[3] as int - 0x80 == r0;
    }
  }

  /** A well-formed two-byte sequence is the encoding of the character it spells. */
  lemma Canonical2(c: char, b0: int, b1: int)
    requires 0xC0 <= b0 < 0xE0 && 0x80 <= b1 < 0xC0
    requires c as int == (b0 - 0xC0) * 0x40 + (b1 - 0x80) >= 0x80
    ensures Encode8(c) == [b0, b1]
  {
    DivMod64(b0 - 0xC0, b1 - 0x80);
  }

  /** A well-formed three-byte sequence is the encoding of the character it spells. */
  lemma Canonical3(c: char, b0: int, b1: int, b2: int)
    requires 0xE0 <= b0 < 0xF0 && 0x80 <= b1 < 0xC0 && 0x80 <= b2 < 0xC0
    requires c as int == (b0 - 0xE0) * 0x1000 + (b1 - 0x80) * 0x40 + (b2 - 0x80) >= 0x800
    ensures Encode8(c) == [b0, b1, b2]
  {
    var hi := (b0 - 0xE0) * 0x40 + (b1 - 0x80);
    assert c as int == 0x40 * hi + (b2 - 0x80);
    DivMod64(hi, b2 - 0x80);
    DivMod64(b0 - 0xE0, b1 - 0x80);
  }

  /** A well-formed four-byte sequence is the encoding of the character it spells. */
  lemma Canonical4(c: char, b0: int, b1: int, b2: int, b3: int)
    requires 0xF0 <= b0 < 0xF8 && 0x80 <= b1 < 0xC0 && 0x80 <= b2 < 0xC0 && 0x80 <= b3 < 0xC0
    requires c as int == (b0 - 0xF0) * 0x4_0000 + (b1 - 0x80) * 0x1000 + (b2 - 0x80) * 0x40 + (b3 - 0x80) >= 0x1_0000
    ensures Encode8(c) == [b0, b1, b2, b3]
  {
    var hi2 := (b0 - 0xF0) * 0x40 + (b1 - 0x80);
    var hi := hi2 * 0x40 + (b2 - 0x80);
    assert c as int == 0x40 * hi + (b3 - 0x80);
    DivMod64(hi, b3 - 0x80);
    DivMod64(hi2, b2 - 0x80);
    DivMod64(b0 - 0xF0, b1 - 0x80);
  }

  /** Whatever the decoder accepts as one character is that character's encoding. */
  lemma DecodeFirst8Canonical(b: seq<byte>)
    requires |b| > 0 && DecodeFirst8(b).Some?
    ensures Encode8(DecodeFirst8(b).value.0) == b[..DecodeFirst8(b).value.1]
  {
    var b0: int := b[0];
    var c := DecodeFirst8(b).value.0;
    if b0 < 0x80 {
    } else if b0 < 0xE0 {
      Canonical2(c, b0, b[1]);
      assert b[..2] == [b[0], b[1]];
    } else if b0 < 0xF0 {
      Canonical3(c, b0, b[1], b[2]);
      assert b[..3] == [b[0], b[1], b[2]];
    } else {
      Canonical4(c, b0, b[1], b[2], b[3]);
      assert b[..4] == [b[0], b[1], b[2], b[3]];
    }
  }

  /** Every text survives a UTF-8 round trip. */
  lemma {:induction false} Utf8RoundTrip(s: string)
    ensures Utf8Decode(Utf8Encode(s)) == Some(s)
  {
    if s != [] {
      var e, rest := Encode8(s[0]), Utf8Encode(s[1..]);
      DecodeFirst8Encode(s[0], rest);
      assert (e + rest)[|e|..] == rest;
      Utf8RoundTrip(s[1..]);
      assert [s[0]] + s[1..] == s;
    }
  }

  /** A byte string is valid UTF-8 exactly when it is the encoding of what it decodes to. */
  lemma {:induction false} Utf8DecodeCanonical(b: seq<byte>)
    requires Utf8Decode(b).Some?
    ensures Utf8Encode(Utf8Decode(b).value) == b
    decreases |b|
  {
    if b != [] {
      Utf8DecodeStep(b);
      var c, n := DecodeFirst8(b).value.0, DecodeFirst8(b).value.1;
      DecodeFirst8Canonical(b);
      Utf8DecodeCanonical(b[n..]);
      var s := Utf8Decode(b).value;
      assert s[0] == c && s[1..] == Utf8Decode(b[n..]).value;
      assert Utf8Encode(s) == Encode8(c) + Utf8Encode(s[1..]);
      assert b == b[..n] + b[n..];
    }
  }

  /** A decoded nonempty string is its first character followed by the decoding of the rest. */
  lemma Utf8DecodeStep(b: seq<byte>)
    requires b != [] && Utf8Decode(b).Some?
    ensures DecodeFirst8(b).Some?
    ensures var n := DecodeFirst8(b).value.1;
            Utf8Decode(b[n..]).Some? && Utf8Decode(b).value == [DecodeFirst8(b).value.0] + Utf8Decode(b[n..]).value
  {
  }

  lemma {:induction false} Utf8EncodeAppend(s: string, t: string)
    ensures Utf8Encode(s + t) == Utf8Encode(s) + Utf8Encode(t)
  {
    if s != [] {
      assert (s + t)[1..] == s[1..] + t;
      Utf8EncodeAppend(s[1..], t);
    } else {
      assert s + t == t;
    }
  }

  // ---------------------------------------------------------------- UTF-16

  predicate IsHighSurrogate(u: u16) { 0xD800 <= u < 0xDC00 }
  predicate IsLowSurrogate(u: u16) { 0xDC00 <= u < 0xE000 }

  /** Strict UTF-16 decoding; `None` on an unpaired surrogate. */
  function Utf16Decode(u: seq<u16>): (r: Option<string>)
    ensures r.Some? ==> |r.value| <= |u| <= 2 * |r.value|
    decreases |u|
  {
    if u == [] then Some([])
    else if !IsHighSurrogate(u[0]) && !IsLowSurrogate(u[0]) then
      match Utf16Decode(u[1..])
      case None => None
      case Some(rest) => Some([u[0] as char] + rest)
    else if IsHighSurrogate(u[0]) && |u| >= 2 && IsLowSurrogate(u[1]) then
      var cp := 0x1_0000 + (u[0] as int - 0xD800) * 0x400 + (u[1] as int - 0xDC00);
      match Utf16Decode(u[2..])
      case None => None
      case Some(rest) => Some([cp as char] + rest)
    else None
  }

  /** The UTF-16 units of one character: one unit, or a surrogate pair. */
  function Encode16(c: char): (u: seq<u16>)
    ensures 1 <= |u| <= 2
  {
    var cp := c as int;
    if cp < 0x1_0000 then [cp]
    else
      var v := cp - 0x1_0000;
      [0xD800 + v / 0x400, 0xDC00 + v % 0x400]
  }

  function Utf16Encode(s: string): seq<u16>
  {
    if s == [] then [] else Encode16(s[0]) + Utf16Encode(s[1..])
  }

  /** A character outside the basic plane becomes a high surrogate and a low surrogate that recombine to it. */
  lemma Encode16Pair(c: char)
    requires c as int >= 0x1_0000
    ensures var u := Encode16(c);
            |u| == 2 && IsHighSurrogate(u[0]) && IsLowSurrogate(u[1])
            && 0x1_0000 + (u[0] as int - 0xD800) * 0x400 + (u[1] as int - 0xDC00) == c as int
  {
    var v := c as int - 0x1_0000;
    assert v == 0x400 * (v / 0x400) + v % 0x400;
  }

  /** Decoding the units of one character followed by more units yields that character first. */
  lemma Decode16Encode(c: char, rest: seq<u16>)
    ensures Utf16Decode(Encode16(c) + rest) ==
              match Utf16Decode(rest)
              case None => None
              case Some(t) => Some([c] + t)
  {
    var u := Encode16(c) + rest;
    if c as int >= 0x1_0000 {
      Encode16Pair(c);
      assert u[2..] == rest;
    } else {
      assert u[1..] == rest;
    }
  }

  /** Every text survives a UTF-16 round trip. */
  lemma {:induction false} Utf16RoundTrip(s: string)
    ensures Utf16Decode(Utf16Encode(s)) == Some(s)
  {
    if s != [] {
      Utf16RoundTrip(s[1..]);
      Decode16Encode(s[0], Utf16Encode(s[1..]));
      assert [s[0]] + s[1..] == s;
    }
  }

  /** A unit string is valid UTF-16 exactly when it is the encoding of what it decodes to. */
  lemma {:induction false} Utf16DecodeCanonical(u: seq<u16>)
    requires Utf16Decode(u).Some?
    ensures Utf16Encode(Utf16Decode(u).value) == u
    decreases |u|
  {
    if u != [] {
      var s := Utf16Decode(u).value;
      if !IsHighSurrogate(u[0]) && !IsLowSurrogate(u[0]) {
        Utf16DecodeCanonical(u[1..]);
        assert s[1..] == Utf16Decode(u[1..]).value;
        assert u == [u[0]] + u[1..];
      } else {
        var hi, lo := u[0] as int - 0xD800, u[1] as int - 0xDC00;
        var v := hi * 0x400 + lo;
        assert v / 0x400 == hi && v % 0x400 == lo;
        Utf16DecodeCanonical(u[2..]);
        assert s[1..] == Utf16Decode(u[2..]).value;
        assert u == [u[0], u[1]] + u[2..];
      }
    }
  }

  // ---------------------------------------------------------------- NUL padding

  predicate AllNul(s: string) {
    forall k :: 0 <= k < |s| ==> s[k] == '\0'
  }

  /** The number of NUL characters at the front of `s`. */
  function LeadingNuls(s: string): (n: nat)
    ensures n <= |s|
    ensures AllNul(s[..n])
    ensures n < |s| ==> s[n] != '\0'
  {
    if s == [] || s[0] != '\0' then 0 else 1 + LeadingNuls(s[1..])
  }

  /** The number of NUL characters at the back of `s`. */
  function TrailingNuls(s: string): (n: nat)
    ensures n <= |s|
    ensures AllNul(s[|s| - n..])
    ensures n < |s| ==> s[|s| - 1 - n] != '\0'
  {
    if s == [] || s[|s| - 1] != '\0' then 0 else 1 + TrailingNuls(s[..|s| - 1])
  }

  /**
    Rust's `trim_matches('\0')`: `s` with all leading and trailing NULs removed.
    The result is the part of `s` after its leading NULs, only NULs follow it
    in `s`, and it neither starts nor ends with a NUL.
  */
  function TrimNul(s: string): (r: string)
    ensures |r| <= |s| - LeadingNuls(s)
    ensures r == s[LeadingNuls(s)..LeadingNuls(s) + |r|]
    ensures AllNul(s[LeadingNuls(s) + |r|..])
    ensures r != [] ==> r[0] != '\0' && r[|r| - 1] != '\0'
  {
    var t := s[LeadingNuls(s)..];
    t[..|t| - TrailingNuls(t)]
  }

  /** A text is its leading NULs, its trimmed part and its trailing NULs. */
  lemma TrimNulSplit(s: string)
    ensures var lead, t := LeadingNuls(s), TrimNul(s);
            && lead + |t| <= |s|
            && s == s[..lead] + t + s[lead + |t|..]
            && AllNul(s[..lead]) && AllNul(s[lead + |t|..])
  {
    var lead, t := LeadingNuls(s), TrimNul(s);
    assert s == s[..lead] + s[lead..lead + |t|] + s[lead + |t|..];
  }

  /** Trimming twice changes nothing more. */
  lemma TrimNulIdempotent(s: string)
    ensures TrimNul(TrimNul(s)) == TrimNul(s)
  {
    var r := TrimNul(s);
    if r != [] {
      assert LeadingNuls(r) == 0;
      assert TrailingNuls(r) == 0;
    }
  }

  /** A string made only of NULs encodes to zero bytes and nothing else. */
  lemma {:induction false} EncodeNuls(s: string)
    requires AllNul(s)
    ensures Utf8Encode(s) == Zeros(|s|)
  {
    if s != [] {
      EncodeNuls(s[1..]);
      assert Utf8Encode(s) == [0] + Zeros(|s| - 1);
    }
  }
}
