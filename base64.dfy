/** The snapshot text format: the database image written as a data URL
    (RFC 2397) whose payload is base64 with padding (RFC 4648 section 4),
    as `FileReader.readAsDataURL` produces it, and read back with
    `split(",")[1]` and `atob`, whose decoder is the "forgiving-base64
    decode" of the WHATWG Infra standard. */
module Base64 {
  import opened Wrappers

  // ---------------------------------------------------------------------
  // The alphabet
  // ---------------------------------------------------------------------

  predicate IsBase64Char(c: char)
  {
    'A' <= c <= 'Z' || 'a' <= c <= 'z' || '0' <= c <= '9' || c == '+' || c == '/'
  }

  /** The character RFC 4648 section 4 assigns to a six-bit value. */
  function SextetChar(v: bv8): (c: char)
    requires v < 64
    ensures IsBase64Char(c)
  {
    var n := v as int;
    if n < 26 then ('A' as int + n) as char
    else if n < 52 then ('a' as int + (n - 26)) as char
    else if n < 62 then ('0' as int + (n - 52)) as char
    else if n == 62 then '+'
    else '/'
  }

  /** The six-bit value of an alphabet character. */
  function SextetValue(c: char): (v: bv8)
    requires IsBase64Char(c)
    ensures v < 64
  {
    if 'A' <= c <= 'Z' then (c as int - 'A' as int) as bv8
    else if 'a' <= c <= 'z' then (c as int - 'a' as int + 26) as bv8
    else if '0' <= c <= '9' then (c as int - '0' as int + 52) as bv8
    else if c == '+' then 62
    else 63
  }

  lemma SextetRoundTrip(v: bv8)
    requires v < 64
    ensures SextetValue(SextetChar(v)) == v
  {
    if v < 26 {
      SextetRoundTripLetter(v);
    } else if v < 52 {
      SextetRoundTripLetter(v);
    } else if v < 62 {
      SextetRoundTripDigit(v);
    }
  }

  lemma SextetRoundTripLetter(v: bv8)
    requires v < 52
    ensures SextetValue(SextetChar(v)) == v
  {
    var n := v as int;
    if n < 26 {
      var c := ('A' as int + n) as char;
      assert SextetChar(v) == c && 'A' <= c <= 'Z';
      assert (c as int - 'A' as int) == n;
    } else {
      var c := ('a' as int + (n - 26)) as char;
      assert SextetChar(v) == c && !('A' <= c <= 'Z') && 'a' <= c <= 'z';
      assert (c as int - 'a' as int + 26) == n;
    }
  }

  lemma SextetRoundTripDigit(v: bv8)
    requires 52 <= v < 62
    ensures SextetValue(SextetChar(v)) == v
  {
    var n := v as int;
    var c := ('0' as int + (n - 52)) as char;
    assert SextetChar(v) == c && '0' <= c <= '9';
    assert (c as int - '0' as int + 52) == n;
  }

  // ---------------------------------------------------------------------
  // Encoding
  // ---------------------------------------------------------------------

  // The six-bit groups of three bytes x, y, z, most significant first.
  function Sextet0(x: bv8): (v: bv8) ensures v < 64 { x >> 2 }
  function Sextet1(x: bv8, y: bv8): (v: bv8) ensures v < 64 { ((x & 3) << 4) | (y >> 4) }
  function Sextet2(y: bv8, z: bv8): (v: bv8) ensures v < 64 { ((y & 15) << 2) | (z >> 6) }
  function Sextet3(z: bv8): (v: bv8) ensures v < 64 { z & 63 }

  // The three bytes of four six-bit groups a, b, c, d.
  function Byte0(a: bv8, b: bv8): bv8 { (a << 2) | (b >> 4) }
  function Byte1(b: bv8, c: bv8): bv8 { ((b & 15) << 4) | (c >> 2) }
  function Byte2(c: bv8, d: bv8): bv8 { ((c & 3) << 6) | d }

  lemma BitsRoundTrip(x: bv8, y: bv8, z: bv8)
    ensures Byte0(Sextet0(x), Sextet1(x, y)) == x
    ensures Byte1(Sextet1(x, y), Sextet2(y, z)) == y
    ensures Byte2(Sextet2(y, z), Sextet3(z)) == z
    ensures Byte0(Sextet0(x), Sextet1(x, 0)) == x
    ensures Byte1(Sextet1(x, y), Sextet2(y, 0)) == y
  {
  }

  /** The alphabet characters for `b`: four per group of three bytes, and
      two or three for a final group of one or two bytes (the unused low
      bits are zero). */
  function EncodeUnpadded(b: seq<bv8>): (r: string)
    ensures forall i :: 0 <= i < |r| ==> IsBase64Char(r[i])
    ensures |r| % 4 == (if |b| % 3 == 0 then 0 else |b| % 3 + 1)
    ensures |b| >= 3 ==> |r| >= 4
    decreases |b|
  {
    if |b| == 0 then []
    else if |b| == 1 then
      [SextetChar(Sextet0(b[0])), SextetChar(Sextet1(b[0], 0))]
    else if |b| == 2 then
      [SextetChar(Sextet0(b[0])), SextetChar(Sextet1(b[0], b[1])), SextetChar(Sextet2(b[1], 0))]
    else Quad(b[0], b[1], b[2]) + EncodeUnpadded(b[3..])
  }

  /** The four characters of a whole group of three bytes. */
  function Quad(x: bv8, y: bv8, z: bv8): (r: string)
    ensures |r| == 4 && forall i :: 0 <= i < 4 ==> IsBase64Char(r[i])
  {
    [SextetChar(Sextet0(x)), SextetChar(Sextet1(x, y)), SextetChar(Sextet2(y, z)), SextetChar(Sextet3(z))]
  }

  function Padding(n: nat): string
  {
    if n % 3 == 1 then "==" else if n % 3 == 2 then "=" else ""
  }

  /** Padded base64 of `b`: a whole number of four-character groups drawn
      from the alphabet and `=`. */
  function Encode(b: seq<bv8>): (r: string)
    ensures |r| % 4 == 0
    ensures forall i :: 0 <= i < |r| ==> IsBase64Char(r[i]) || r[i] == '='
  {
    EncodeUnpadded(b) + Padding(|b|)
  }

  // ---------------------------------------------------------------------
  // Decoding (`atob`)
  // ---------------------------------------------------------------------

  predicate IsAsciiWhitespace(c: char)
  {
    c == '\t' || c == '\n' || c == '\U{000C}' || c == '\r' || c == ' '
  }

  function StripAsciiWhitespace(s: string): (r: string)
    ensures forall i :: 0 <= i < |r| ==> !IsAsciiWhitespace(r[i])
  {
    if s == [] then []
    else (if IsAsciiWhitespace(s[0]) then [] else [s[0]]) + StripAsciiWhitespace(s[1..])
  }

  /** Bytes from alphabet characters, four characters to three bytes; a
      final group of two or three characters gives one or two bytes and its
      leftover bits are dropped. */
  function DecodeSextets(d: string): seq<bv8>
    requires forall i :: 0 <= i < |d| ==> IsBase64Char(d[i])
    requires |d| % 4 != 1
    decreases |d|
  {
    if |d| == 0 then []
    else if |d| == 2 then
      [Byte0(SextetValue(d[0]), SextetValue(d[1]))]
    else if |d| == 3 then
      [Byte0(SextetValue(d[0]), SextetValue(d[1])), Byte1(SextetValue(d[1]), SextetValue(d[2]))]
    else
      [Byte0(SextetValue(d[0]), SextetValue(d[1])), Byte1(SextetValue(d[1]), SextetValue(d[2])),
       Byte2(SextetValue(d[2]), SextetValue(d[3]))]
      + DecodeSextets(d[4..])
  }

  /** The text that is left once one or two `=` are taken off the end of a
      whole number of four-character groups. */
  function Unpad(d: string): string
  {
    if |d| % 4 == 0 && |d| >= 2 && d[|d| - 2] == '=' && d[|d| - 1] == '=' then d[..|d| - 2]
    else if |d| % 4 == 0 && |d| >= 1 && d[|d| - 1] == '=' then d[..|d| - 1]
    else d
  }

  /** Forgiving-base64 decode: ASCII white space is ignored, padding is
      optional, and the input fails when one character is left over after
      whole groups or when a character outside the alphabet remains. */
  function ForgivingDecode(s: string): Option<seq<bv8>>
  {
    var d := Unpad(StripAsciiWhitespace(s));
    if |d| % 4 == 1 || !(forall i :: 0 <= i < |d| ==> IsBase64Char(d[i])) then None
    else Some(DecodeSextets(d))
  }

  /** The "binary string" `atob` returns: one character per byte. */
  function BinaryString(b: seq<bv8>): (r: string)
    ensures |r| == |b|
    ensures forall i :: 0 <= i < |r| ==> r[i] as int == b[i] as int
  {
    seq(|b|, i requires 0 <= i < |b| => (b[i] as int) as char)
  }

  function Atob(s: string): Option<string>
  {
    match ForgivingDecode(s)
    case None => None
    case Some(b) => Some(BinaryString(b))
  }

  /** `binary.charCodeAt(i)` stored into a `Uint8Array`, which keeps the
      value modulo 256. */
  function CharCode(c: char): bv8
  {
    (c as int % 256) as bv8
  }

  function BinaryBytes(binary: string): (b: seq<bv8>)
    ensures |b| == |binary|
  {
    seq(|binary|, i requires 0 <= i < |binary| => CharCode(binary[i]))
  }

  // ---------------------------------------------------------------------
  // Round trip
  // ---------------------------------------------------------------------

  lemma {:induction false} DecodeEncodeUnpadded(b: seq<bv8>)
    ensures |EncodeUnpadded(b)| % 4 != 1
    ensures DecodeSextets(EncodeUnpadded(b)) == b
    decreases |b|
  {
    if |b| == 1 {
      DecodeLastOne(b[0]);
    } else if |b| == 2 {
      DecodeLastTwo(b[0], b[1]);
    } else if |b| >= 3 {
      DecodeEncodeUnpadded(b[3..]);
      DecodeGroup(b);
    }
  }

  lemma DecodeLastOne(x: bv8)
    ensures DecodeSextets(EncodeUnpadded([x])) == [x]
  {
    SextetRoundTrip(Sextet0(x));
    SextetRoundTrip(Sextet1(x, 0));
    BitsRoundTrip(x, 0, 0);
  }

  lemma DecodeLastTwo(x: bv8, y: bv8)
    ensures DecodeSextets(EncodeUnpadded([x, y])) == [x, y]
  {
    SextetRoundTrip(Sextet0(x));
    SextetRoundTrip(Sextet1(x, y));
    SextetRoundTrip(Sextet2(y, 0));
    BitsRoundTrip(x, y, 0);
  }

  /** One whole group: if the rest decodes back, so does the whole. */
  lemma DecodeGroup(b: seq<bv8>)
    requires |b| >= 3
    requires |EncodeUnpadded(b[3..])| % 4 != 1
    requires DecodeSextets(EncodeUnpadded(b[3..])) == b[3..]
    ensures |EncodeUnpadded(b)| % 4 != 1
    ensures DecodeSextets(EncodeUnpadded(b)) == b
  {
    var q := Quad(b[0], b[1], b[2]);
    var tail := EncodeUnpadded(b[3..]);
    var u := EncodeUnpadded(b);
    assert u == q + tail;
    assert u[4..] == tail;
    assert u[0] == q[0] && u[1] == q[1] && u[2] == q[2] && u[3] == q[3];
    DecodeUnfold(u);
    QuadDecodes(b[0], b[1], b[2]);
    assert b == [b[0], b[1], b[2]] + b[3..];
  }

  /** The four characters of a group decode to its three bytes. */
  lemma QuadDecodes(x: bv8, y: bv8, z: bv8)
    ensures var q := Quad(x, y, z);
      && Byte0(SextetValue(q[0]), SextetValue(q[1])) == x
      && Byte1(SextetValue(q[1]), SextetValue(q[2])) == y
      && Byte2(SextetValue(q[2]), SextetValue(q[3])) == z
  {
    SextetRoundTrip(Sextet0(x));
    SextetRoundTrip(Sextet1(x, y));
    SextetRoundTrip(Sextet2(y, z));
    SextetRoundTrip(Sextet3(z));
    BitsRoundTrip(x, y, z);
  }

  lemma DecodeUnfold(d: string)
    requires forall i :: 0 <= i < |d| ==> IsBase64Char(d[i])
    requires |d| % 4 != 1 && |d| >= 4
    ensures DecodeSextets(d) ==
      [Byte0(SextetValue(d[0]), SextetValue(d[1])), Byte1(SextetValue(d[1]), SextetValue(d[2])),
       Byte2(SextetValue(d[2]), SextetValue(d[3]))]
      + DecodeSextets(d[4..])
  {
  }

  lemma {:induction false} StripLeavesEncoding(s: string)
    requires forall i :: 0 <= i < |s| ==> IsBase64Char(s[i]) || s[i] == '='
    ensures StripAsciiWhitespace(s) == s
  {
    if s != [] {
      StripLeavesEncoding(s[1..]);
      assert s == [s[0]] + s[1..];
    }
  }

  lemma UnpadEncoding(b: seq<bv8>)
    ensures Unpad(Encode(b)) == EncodeUnpadded(b)
  {
    var u := EncodeUnpadded(b);
    var e := Encode(b);
    if |b| % 3 == 1 {
      assert e == u + "==";
      assert e[..|e| - 2] == u;
    } else if |b| % 3 == 2 {
      assert e == u + "=";
      assert e[|e| - 2] == u[|u| - 1];
      assert e[..|e| - 1] == u;
    } else {
      assert e == u;
      if |u| >= 1 {
        assert IsBase64Char(u[|u| - 1]);
      }
    }
  }

  /** Decoding what was encoded gives back every byte: the
      `decode(encode(b)) == b` promise of RFC 4648 section 4, through the
      forgiving decoder. */
  lemma DecodeEncode(b: seq<bv8>)
    ensures ForgivingDecode(Encode(b)) == Some(b)
  {
    StripLeavesEncoding(Encode(b));
    UnpadEncoding(b);
    DecodeEncodeUnpadded(b);
  }

  lemma CharCodeOfByte(x: bv8)
    ensures CharCode((x as int) as char) == x
  {
    var n := x as int;
    assert n < 256;
    assert n % 256 == n;
  }

  lemma BinaryBytesOfString(b: seq<bv8>)
    ensures BinaryBytes(BinaryString(b)) == b
  {
    var binary := BinaryString(b);
    var r := BinaryBytes(binary);
    forall i | 0 <= i < |b| ensures r[i] == b[i] {
      assert binary[i] == (b[i] as int) as char;
      CharCodeOfByte(b[i]);
    }
  }

  // ---------------------------------------------------------------------
  // The data URL around the payload
  // ---------------------------------------------------------------------

  /** The data URL header `readAsDataURL` writes for a Blob of type
      application/octet-stream. */
  const SnapshotHeader: string := "data:application/octet-stream;base64"

  /** The text `saveDB` stores for a database image. */
  function SnapshotText(image: seq<bv8>): string
  {
    SnapshotHeader + "," + Encode(image)
  }

  function AfterFirstComma(s: string): (r: Option<string>)
    ensures r.None? <==> ',' !in s
  {
    if s == [] then None
    else if s[0] == ',' then Some(s[1..])
    else AfterFirstComma(s[1..])
  }

  function UpToComma(s: string): (r: string)
    ensures ',' !in r
  {
    if s == [] || s[0] == ',' then [] else [s[0]] + UpToComma(s[1..])
  }

  /** `s.split(",")[1]`: the field between the first comma and the next one
      (or the end); None (`undefined`) when `s` has no comma. */
  function SecondField(s: string): (r: Option<string>)
    ensures r.None? <==> ',' !in s
  {
    match AfterFirstComma(s)
    case None => None
    case Some(rest) => Some(UpToComma(rest))
  }

  /** The binary string lines 88-97 obtain from the stored entry: None when
      the entry is missing or empty (`if (storedDB)` fails) or when `atob`
      throws. `atob(undefined)` decodes the nine-letter text "undefined". */
  function StoredBinary(stored: Option<string>): Option<string>
  {
    if stored.None? || stored.value == "" then None
    else
      match SecondField(stored.value)
      case Some(payload) => Atob(payload)
      case None => Atob("undefined")
  }

  /** The image bytes a stored entry restores to, or None when the code
      falls back to a fresh database. */
  function RestoredImage(stored: Option<string>): Option<seq<bv8>>
  {
    match StoredBinary(stored)
    case None => None
    case Some(binary) => Some(BinaryBytes(binary))
  }

  lemma {:induction false} AfterCommaOf(a: string, b: string)
    requires ',' !in a
    ensures AfterFirstComma(a + "," + b) == Some(b)
  {
    if a != [] {
      assert (a + "," + b)[1..] == a[1..] + "," + b;
      AfterCommaOf(a[1..], b);
    } else {
      assert a + "," + b == [','] + b;
    }
  }

  lemma {:induction false} UpToCommaOf(s: string)
    requires ',' !in s
    ensures UpToComma(s) == s
  {
    if s != [] {
      UpToCommaOf(s[1..]);
      assert s == [s[0]] + s[1..];
    }
  }

  lemma EncodingHasNoComma(b: seq<bv8>)
    ensures ',' !in Encode(b)
  {
  }

  /** What `saveDB` stores, `initDB` reads back byte for byte, including
      the zero-length image (whose data URL ends at the comma). */
  lemma SnapshotRoundTrip(image: seq<bv8>)
    ensures RestoredImage(Some(SnapshotText(image))) == Some(image)
  {
    var e := Encode(image);
    assert ',' !in SnapshotHeader;
    AfterCommaOf(SnapshotHeader, e);
    EncodingHasNoComma(image);
    UpToCommaOf(e);
    assert SecondField(SnapshotText(image)) == Some(e);
    assert SnapshotText(image) != "";
    DecodeEncode(image);
    BinaryBytesOfString(image);
  }

  /** An entry without a comma never restores: `split(",")[1]` is
      `undefined`, and the text "undefined" is rejected by `atob` because
      nine characters leave one over after two whole groups. */
  lemma NoCommaNoImage(s: string)
    requires ',' !in s
    ensures RestoredImage(Some(s)) == None
  {
    NineLettersAreNotBase64("undefined");
    assert SecondField(s).None?;
  }

  /** `atob(undefined)` throws: "undefined" is nine letters, one more than
      two whole groups. */
  lemma NineLettersAreNotBase64(u: string)
    requires |u| == 9 && forall i :: 0 <= i < |u| ==> 'a' <= u[i] <= 'z'
    ensures Atob(u) == None
  {
    StripLeavesLetters(u);
    assert Unpad(u) == u;
  }

  lemma {:induction false} StripLeavesLetters(s: string)
    requires forall i :: 0 <= i < |s| ==> 'a' <= s[i] <= 'z'
    ensures StripAsciiWhitespace(s) == s
  {
    if s != [] {
      StripLeavesLetters(s[1..]);
      assert s == [s[0]] + s[1..];
    }
  }
}
