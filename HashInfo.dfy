/**
 * The record one scanned file produces (fileHashInfo), the lowercase hex
 * rendering of its 16-byte content digest, and the extension of a path as
 * filepath.Ext computes it on a Unix system.
 */
module HashInfo {
  import opened Wrappers

  /** The value the record carries in oldHash and oldTime until the database
      supplies the previous generation. */
  const Sentinel: string := "--"

  /** One scanned entry that is not a directory, as the walker hands it to the persister. */
  datatype FileHashInfo = FileHashInfo(
    path: string,
    extension: string,
    permissions: string,
    hash: string,
    hashTime: string,
    modifiedDate: string,
    oldHash: string,
    oldTime: string)

  type Byte = b: int | 0 <= b < 256

  /** An MD5 sum: always 16 bytes. */
  type Digest = d: seq<Byte> | |d| == 16
    witness [0, 0, 0, 0, 0, 0, 0, 0, 0, 0, 0, 0, 0, 0, 0, 0]

  // ---------------------------------------------------------------------------
  // Hex encoding (encoding/hex)

  const HexTable: string := "0123456789abcdef"

  predicate IsLowerHex(c: char) {
    ('0' <= c <= '9') || ('a' <= c <= 'f')
  }

  predicate IsLowerHexString(s: string) {
    forall i :: 0 <= i < |s| ==> IsLowerHex(s[i])
  }

  /** hex.EncodeToString: two lowercase digits per byte, high nibble first. */
  function EncodeToString(src: seq<Byte>): (s: string)
    ensures |s| == 2 * |src|
    ensures IsLowerHexString(s)
  {
    if src == [] then ""
    else
      var rest := EncodeToString(src[1..]);
      var hi, lo := HexTable[src[0] / 16], HexTable[src[0] % 16];
      assert IsLowerHex(hi) && IsLowerHex(lo) by { HexTableIsLowerHex(src[0] / 16); HexTableIsLowerHex(src[0] % 16); }
      [hi, lo] + rest
  }

  lemma HexTableIsLowerHex(k: nat)
    requires k < 16
    ensures IsLowerHex(HexTable[k])
  {
  }

  /** The value of one hex digit; hex.DecodeString accepts both cases. */
  function FromHexChar(c: char): (r: Option<nat>)
    ensures r.Some? ==> r.value < 16
    ensures r.Some? <==> IsLowerHex(c) || ('A' <= c <= 'F')
  {
    if '0' <= c <= '9' then Some(c as nat - '0' as nat)
    else if 'a' <= c <= 'f' then Some(c as nat - 'a' as nat + 10)
    else if 'A' <= c <= 'F' then Some(c as nat - 'A' as nat + 10)
    else None
  }

  /** hex.DecodeString: None for an odd length or a byte that is not a hex digit. */
  function DecodeString(s: string): (r: Option<seq<Byte>>)
    ensures r.Some? ==> 2 * |r.value| == |s|
  {
    if |s| == 0 then Some([])
    else if |s| == 1 then None
    else
      match (FromHexChar(s[0]), FromHexChar(s[1]), DecodeString(s[2..]))
      case (Some(hi), Some(lo), Some(rest)) => Some([hi * 16 + lo] + rest)
      case _ => None
  }

  lemma HexDigitRoundTrip(k: nat)
    requires k < 16
    ensures FromHexChar(HexTable[k]) == Some(k)
  {
  }

  lemma HexCharRoundTrip(c: char)
    requires IsLowerHex(c)
    ensures FromHexChar(c).Some? && FromHexChar(c).value < 16 && HexTable[FromHexChar(c).value] == c
  {
  }

  /** Decoding the encoding of a digest gives the digest back: the hash field
      determines the digest it was made from. */
  lemma {:induction false} DecodeEncode(src: seq<Byte>)
    ensures DecodeString(EncodeToString(src)) == Some(src)
  {
    if src != [] {
      var s := EncodeToString(src);
      var hi, lo := src[0] / 16, src[0] % 16;
      HexDigitRoundTrip(hi);
      HexDigitRoundTrip(lo);
      assert s[0] == HexTable[hi] && s[1] == HexTable[lo];
      assert s[2..] == EncodeToString(src[1..]);
      DecodeEncode(src[1..]);
      assert DecodeString(s) == Some([hi * 16 + lo] + src[1..]);
      assert [src[0]] + src[1..] == src;
    }
  }

  /** Every even-length lowercase hex string is the encoding of exactly the
      bytes it decodes to: EncodeToString is onto such strings. */
  lemma {:induction false} EncodeDecode(s: string)
    requires |s| % 2 == 0 && IsLowerHexString(s)
    ensures DecodeString(s).Some? && EncodeToString(DecodeString(s).value) == s
  {
    if |s| > 0 {
      HexCharRoundTrip(s[0]);
      HexCharRoundTrip(s[1]);
      EncodeDecode(s[2..]);
      var hi, lo := FromHexChar(s[0]).value, FromHexChar(s[1]).value;
      var b: Byte := hi * 16 + lo;
      var rest := DecodeString(s[2..]).value;
      assert DecodeString(s) == Some([b] + rest);
      assert b / 16 == hi && b % 16 == lo;
      assert ([b] + rest)[1..] == rest;
      assert s == [s[0], s[1]] + s[2..];
    }
  }

  /** The hash field of a record: exactly 32 lowercase hex characters that
      decode back to the digest. */
  lemma DigestHex(d: Digest)
    ensures |EncodeToString(d)| == 32
    ensures IsLowerHexString(EncodeToString(d))
    ensures DecodeString(EncodeToString(d)) == Some(d)
  {
    DecodeEncode(d);
  }

  // ---------------------------------------------------------------------------
  // filepath.Ext with '/' as the only separator

  /** The suffix of path that starts at the final '.' of its last element,
      or "" when that element has no '.'. */
  function Ext(path: string): (r: string)
    ensures |r| <= |path| && r == path[|path| - |r|..]
    ensures r != "" ==> r[0] == '.'
    ensures forall k :: 0 < k < |r| ==> r[k] != '.' && r[k] != '/'
    ensures r == "" ==> forall k :: 0 <= k < |path| && path[k] == '.' ==> '/' in path[k + 1..]
  {
    if path == [] then ""
    else
      var last := path[|path| - 1];
      if last == '/' then
        forall k | 0 <= k < |path| - 1 && path[k] == '.' ensures '/' in path[k + 1..] {
          assert path[k + 1..][|path| - k - 2] == '/';
        }
        ""
      else if last == '.' then "."
      else
        var init := path[..|path| - 1];
        var e := Ext(init);
        if e == "" then
          forall k | 0 <= k < |init| && path[k] == '.' ensures '/' in path[k + 1..] {
            assert init[k] == '.';
            assert init[k + 1..] <= path[k + 1..];
          }
          ""
        else e + [last]
  }
}
