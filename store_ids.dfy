/** Note IDs and the file names they are stored under (store/store.go):
    hex encoding and decoding, hyphen stripping, the hashed file name and
    the version-4 UUID generator. */
module StoreIds {
  import opened Common

  predicate IsHexChar(c: char) {
    ('0' <= c <= '9') || ('a' <= c <= 'f') || ('A' <= c <= 'F')
  }

  predicate IsLowerHexChar(c: char) {
    ('0' <= c <= '9') || ('a' <= c <= 'f')
  }

  function HexValue(c: char): (v: nat)
    requires IsHexChar(c)
    ensures v < 16
  {
    if c <= '9' then c as int - '0' as int
    else if c <= 'F' then 10 + (c as int - 'A' as int)
    else 10 + (c as int - 'a' as int)
  }

  function HexDigit(v: nat): (c: char)
    requires v < 16
    ensures IsLowerHexChar(c) && HexValue(c) == v
  {
    if v < 10 then ('0' as int + v) as char else ('a' as int + v - 10) as char
  }

  /** `hex.EncodeToString`: two lower-case digits per byte, high nibble first. */
  function HexEncode(b: seq<byte>): (s: string)
    ensures |s| == 2 * |b|
    ensures forall i :: 0 <= i < |s| ==> IsLowerHexChar(s[i])
  {
    if b == [] then []
    else [HexDigit(b[0] as int / 16), HexDigit(b[0] as int % 16)] + HexEncode(b[1..])
  }

  /** `hex.DecodeString`: fails on an odd length or on a character that is not
      a hex digit; both upper- and lower-case digits are accepted. */
  function HexDecode(s: string): (r: Option<seq<byte>>)
    ensures r.Some? ==> |r.value| * 2 == |s|
  {
    if s == [] then Some([])
    else if |s| == 1 || !IsHexChar(s[0]) || !IsHexChar(s[1]) then None
    else match HexDecode(s[2..])
      case None => None
      case Some(rest) => Some([(HexValue(s[0]) * 16 + HexValue(s[1])) as byte] + rest)
  }

  lemma {:induction false} HexRoundTrip(b: seq<byte>)
    ensures HexDecode(HexEncode(b)) == Some(b)
  {
    if b != [] {
      HexRoundTrip(b[1..]);
      var s := HexEncode(b);
      assert s[2..] == HexEncode(b[1..]);
      var x := b[0] as int;
      assert s[0] == HexDigit(x / 16) && s[1] == HexDigit(x % 16);
      assert IsHexChar(s[0]) && IsHexChar(s[1]);
      assert HexValue(s[0]) * 16 + HexValue(s[1]) == x / 16 * 16 + x % 16 == x;
      assert HexDecode(s) == Some([b[0]] + b[1..]);
      assert [b[0]] + b[1..] == b;
    }
  }

  /** A hex digit in lower case. */
  function LowerHex(c: char): char {
    if 'A' <= c <= 'F' then (c as int - 'A' as int + 'a' as int) as char else c
  }

  function Lower(s: string): (r: string)
    ensures |r| == |s|
    ensures forall i :: 0 <= i < |s| ==> r[i] == LowerHex(s[i])
  {
    if s == [] then [] else [LowerHex(s[0])] + Lower(s[1..])
  }

  /** Decoding ignores the case of the hex digits. */
  lemma {:induction false} HexDecodeIgnoresCase(s: string)
    ensures HexDecode(Lower(s)) == HexDecode(s)
  {
    if |s| >= 2 {
      HexDecodeIgnoresCase(s[2..]);
      assert Lower(s)[2..] == Lower(s[2..]);
    }
  }

  /** Whatever decodes is encoded back as its lower-case spelling. */
  lemma {:induction false} HexDecodeThenEncode(s: string)
    requires HexDecode(s).Some?
    ensures HexEncode(HexDecode(s).value) == Lower(s)
  {
    if s != [] {
      HexDecodeThenEncode(s[2..]);
      var rest := HexDecode(s[2..]).value;
      var x := HexValue(s[0]) * 16 + HexValue(s[1]);
      HexPair(s[0], s[1]);
      var v := HexDecode(s).value;
      assert v == [x as byte] + rest;
      assert v[1..] == rest;
      assert HexEncode(v) == [LowerHex(s[0]), LowerHex(s[1])] + HexEncode(rest);
      assert Lower(s) == [LowerHex(s[0]), LowerHex(s[1])] + Lower(s[2..]);
    }
  }

  /** Two hex digits read as a byte are written back in lower case. */
  lemma HexPair(c0: char, c1: char)
    requires IsHexChar(c0) && IsHexChar(c1)
    ensures var x := HexValue(c0) * 16 + HexValue(c1);
      x < 256 && HexDigit(x / 16) == LowerHex(c0) && HexDigit(x % 16) == LowerHex(c1)
  {
    var x := HexValue(c0) * 16 + HexValue(c1);
    assert x / 16 == HexValue(c0) && x % 16 == HexValue(c1);
    LowerHexDigit(c0);
    LowerHexDigit(c1);
  }

  lemma LowerHexDigit(c: char)
    requires IsHexChar(c)
    ensures HexDigit(HexValue(c)) == LowerHex(c)
  {
  }

  /** `strings.Replace(uuid, "-", "", -1)`. */
  function StripHyphens(s: string): (r: string)
    ensures |r| <= |s|
  {
    if s == [] then [] else (if s[0] == '-' then [] else [s[0]]) + StripHyphens(s[1..])
  }

  lemma {:induction false} StripHyphensAppend(a: string, b: string)
    ensures StripHyphens(a + b) == StripHyphens(a) + StripHyphens(b)
  {
    if a == [] {
      assert a + b == b;
    } else {
      assert (a + b)[0] == a[0];
      assert (a + b)[1..] == a[1..] + b;
      StripHyphensAppend(a[1..], b);
      var h := if a[0] == '-' then [] else [a[0]];
      assert StripHyphens(a + b) == h + StripHyphens(a[1..] + b);
      assert StripHyphens(a) == h + StripHyphens(a[1..]);
      assert h + (StripHyphens(a[1..]) + StripHyphens(b)) == (h + StripHyphens(a[1..])) + StripHyphens(b);
    }
  }

  /** The SHA-256 digest of a byte string: 32 bytes. */
  type Digest = d: seq<byte> | |d| == 32 witness seq(32, _ => 0 as byte)

  /** UuidToFileName: the hex SHA-256 of the ID's bytes, or "" when the ID
      (hyphens removed) is not hex. `sha` stands for `sha256.Sum256`. */
  function UuidToFileName(sha: seq<byte> -> Digest, uuid: string): (name: string)
    ensures name == "" <==> HexDecode(StripHyphens(uuid)).None?
    ensures name != "" ==> |name| == 64 && forall i :: 0 <= i < 64 ==> IsLowerHexChar(name[i])
  {
    match HexDecode(StripHyphens(uuid))
    case None => ""
    case Some(idBytes) => HexEncode(sha(idBytes))
  }

  /** Hyphen placement and the case of the hex digits do not change the file name. */
  lemma SameFileName(sha: seq<byte> -> Digest, u1: string, u2: string)
    requires Lower(StripHyphens(u1)) == Lower(StripHyphens(u2))
    ensures UuidToFileName(sha, u1) == UuidToFileName(sha, u2)
  {
    HexDecodeIgnoresCase(StripHyphens(u1));
    HexDecodeIgnoresCase(StripHyphens(u2));
  }

  /** Byte 6 gets version 4 in its high nibble; byte 8 gets the variant bits 10. */
  function SetVersionAndVariant(b: seq<byte>): (r: seq<byte>)
    requires |b| == 16
    ensures |r| == 16
    ensures r[6] as int / 16 == 4 && r[8] as int / 64 == 2
    ensures r[6] as int % 16 == b[6] as int % 16 && r[8] as int % 64 == b[8] as int % 64
    ensures forall i :: 0 <= i < 16 && i != 6 && i != 8 ==> r[i] == b[i]
  {
    // b & 0x0f | 0x40 and b & 0x3f | 0x80
    b[6 := (b[6] as int % 16 + 0x40) as byte][8 := (b[8] as int % 64 + 0x80) as byte]
  }

  /** GenerateUuid: `random` is what `rand.Read` filled in, or None when it failed. */
  function GenerateUuid(random: Option<seq<byte>>): (uuid: string)
    requires random.Some? ==> |random.value| == 16
    ensures random.None? ==> uuid == ""
    ensures random.Some? ==> |uuid| == 36
  {
    match random
    case None => ""
    case Some(raw) =>
      var b := SetVersionAndVariant(raw);
      HexEncode(b[0..4]) + "-" + HexEncode(b[4..6]) + "-" + HexEncode(b[6..8]) + "-"
        + HexEncode(b[8..10]) + "-" + HexEncode(b[10..16])
  }

  /** The printed UUID is the 8-4-4-4-12 spelling of the adjusted bytes: hyphens at
      8, 13, 18 and 23, the version digit '4' at 14 and a variant digit 8, 9, a or b at 19. */
  lemma GeneratedUuidLayout(raw: seq<byte>)
    requires |raw| == 16
    ensures var u := GenerateUuid(Some(raw));
      && u[8] == '-' && u[13] == '-' && u[18] == '-' && u[23] == '-'
      && u[14] == '4' && u[19] in "89ab"
  {
    var b := SetVersionAndVariant(raw);
    var g1, g2, g3, g4, g5 := HexEncode(b[0..4]), HexEncode(b[4..6]), HexEncode(b[6..8]), HexEncode(b[8..10]), HexEncode(b[10..16]);
    var u := GenerateUuid(Some(raw));
    assert u == g1 + "-" + g2 + "-" + g3 + "-" + g4 + "-" + g5;
    assert u[14] == g3[0] == HexDigit(b[6] as int / 16);
    assert u[19] == g4[0] == HexDigit(b[8] as int / 16);
    assert b[8] as int / 16 == 8 + (b[8] as int % 64) / 16;
  }

  /** Removing the hyphens from a generated UUID gives back exactly the adjusted bytes,
      so the service can turn every ID it generates into a file name. */
  lemma GeneratedUuidDecodes(raw: seq<byte>)
    requires |raw| == 16
    ensures HexDecode(StripHyphens(GenerateUuid(Some(raw)))) == Some(SetVersionAndVariant(raw))
  {
    var b := SetVersionAndVariant(raw);
    var g1, g2, g3, g4, g5 := HexEncode(b[0..4]), HexEncode(b[4..6]), HexEncode(b[6..8]), HexEncode(b[8..10]), HexEncode(b[10..16]);
    StripGroups(g1, g2, g3, g4, g5);
    EncodeGroups(b);
    HexRoundTrip(b);
  }

  lemma StripGroups(g1: string, g2: string, g3: string, g4: string, g5: string)
    requires forall i :: 0 <= i < |g1| ==> IsLowerHexChar(g1[i])
    requires forall i :: 0 <= i < |g2| ==> IsLowerHexChar(g2[i])
    requires forall i :: 0 <= i < |g3| ==> IsLowerHexChar(g3[i])
    requires forall i :: 0 <= i < |g4| ==> IsLowerHexChar(g4[i])
    requires forall i :: 0 <= i < |g5| ==> IsLowerHexChar(g5[i])
    ensures StripHyphens(g1 + "-" + g2 + "-" + g3 + "-" + g4 + "-" + g5) == g1 + (g2 + (g3 + (g4 + g5)))
  {
    assert g1 + "-" + g2 + "-" + g3 + "-" + g4 + "-" + g5 == g1 + "-" + (g2 + "-" + (g3 + "-" + (g4 + "-" + g5)));
    StripAfterGroup(g1, g2 + "-" + (g3 + "-" + (g4 + "-" + g5)));
    StripAfterGroup(g2, g3 + "-" + (g4 + "-" + g5));
    StripAfterGroup(g3, g4 + "-" + g5);
    StripAfterGroup(g4, g5);
    StripNoHyphen(g5);
  }

  lemma EncodeGroups(b: seq<byte>)
    requires |b| == 16
    ensures HexEncode(b) == HexEncode(b[0..4]) + (HexEncode(b[4..6]) + (HexEncode(b[6..8]) + (HexEncode(b[8..10]) + HexEncode(b[10..16]))))
  {
    assert b == b[0..4] + b[4..16];
    HexEncodeAppend(b[0..4], b[4..16]);
    assert b[4..16] == b[4..6] + b[6..16];
    HexEncodeAppend(b[4..6], b[6..16]);
    assert b[6..16] == b[6..8] + b[8..16];
    HexEncodeAppend(b[6..8], b[8..16]);
    assert b[8..16] == b[8..10] + b[10..16];
    HexEncodeAppend(b[8..10], b[10..16]);
  }

  lemma {:induction false} StripNoHyphen(s: string)
    requires forall i :: 0 <= i < |s| ==> IsLowerHexChar(s[i])
    ensures StripHyphens(s) == s
  {
    if s != [] {
      StripNoHyphen(s[1..]);
    }
  }

  lemma StripAfterGroup(g: string, rest: string)
    requires forall i :: 0 <= i < |g| ==> IsLowerHexChar(g[i])
    ensures StripHyphens(g + "-" + rest) == g + StripHyphens(rest)
  {
    StripHyphensAppend(g + "-", rest);
    StripHyphensAppend(g, "-");
    StripNoHyphen(g);
    assert StripHyphens("-") == [];
    assert StripHyphens(g + "-") == g;
  }

  lemma {:induction false} HexEncodeAppend(a: seq<byte>, b: seq<byte>)
    ensures HexEncode(a + b) == HexEncode(a) + HexEncode(b)
  {
    if a == [] {
      assert a + b == b;
    } else {
      HexEncodeAppend(a[1..], b);
      assert (a + b)[1..] == a[1..] + b;
    }
  }
}
