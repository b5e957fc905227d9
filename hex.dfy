/** The binary-to-text codec of WriteBinary and ReadBinary: every byte becomes
    two upper-case hexadecimal digits (the alphabet of section 8 of RFC 4648),
    high nibble first, followed by the digits of an 8-bit additive checksum. */
module Hex {

  /** An `unsigned char`. */
  type byte = x: int | 0 <= x < 256

  /** An `unsigned int`: sizes passed to the codec are 32-bit. */
  type uint32 = x: int | 0 <= x < 0x1_0000_0000

  /** `unsigned int` arithmetic: the value of `x` after wrap-around. */
  function Wrap32(x: nat): (r: uint32)
    ensures x < 0x1_0000_0000 ==> r == x
  {
    x % 0x1_0000_0000
  }

  predicate IsUpperHexDigit(c: char) {
    '0' <= c <= '9' || 'A' <= c <= 'F'
  }

  /** The `CharToNibble` macro: '0'..'9' give 0..9, every other character c
      gives (10 + c - 'A') & 0xF, with no check that c is a hexadecimal digit. */
  function CharToNibble(c: char): (n: nat)
    ensures n < 16
    ensures '0' <= c <= '9' ==> n == c as int - '0' as int
    ensures 'A' <= c <= 'F' ==> n == c as int - 'A' as int + 10
  {
    if '0' <= c <= '9' then c as int - '0' as int else (10 + c as int - 'A' as int) % 16
  }

  /** Entry `n` of the `hexChars` table "0123456789ABCDEF". */
  function HexDigit(n: nat): (c: char)
    requires n < 16
    ensures IsUpperHexDigit(c)
    ensures CharToNibble(c) == n
  {
    if n < 10 then ('0' as int + n) as char else ('A' as int + n - 10) as char
  }

  /** Decoding a digit and encoding the nibble gives the digit back. */
  lemma DigitOfNibble(c: char)
    requires IsUpperHexDigit(c)
    ensures HexDigit(CharToNibble(c)) == c
  {
  }

  /** The two digits written for one byte: `hexChars[(b >> 4) & 0xF]`, then
      `hexChars[b & 0xF]`. */
  function HexPair(b: byte): string {
    [HexDigit(b / 16), HexDigit(b % 16)]
  }

  /** The running `checksum += currentByte` of an `unsigned char`. */
  function Checksum(data: seq<byte>): byte {
    if data == [] then 0 else (Checksum(data[..|data| - 1]) + data[|data| - 1]) % 256
  }

  /** The plain integer sum of the bytes. */
  function Sum(data: seq<byte>): nat {
    if data == [] then 0 else Sum(data[..|data| - 1]) + data[|data| - 1]
  }

  /** Wrapping at every step is the same as wrapping the total once. */
  lemma {:induction false} ChecksumIsSumMod256(data: seq<byte>)
    ensures Checksum(data) == Sum(data) % 256
  {
    if data != [] {
      var init := data[..|data| - 1];
      ChecksumIsSumMod256(init);
      AddMod256(Sum(init), data[|data| - 1]);
    }
  }

  /** Reducing the left summand first does not change the sum modulo 256. */
  lemma AddMod256(a: nat, b: nat)
    ensures (a % 256 + b) % 256 == (a + b) % 256
  {
    var q := a / 256;
    assert a == 256 * q + a % 256;
    assert a + b == 256 * q + (a % 256 + b);
  }

  /** The digits of the data bytes, in buffer order. */
  function HexBody(data: seq<byte>): (s: string)
    ensures |s| == 2 * |data|
  {
    if data == [] then [] else HexBody(data[..|data| - 1]) + HexPair(data[|data| - 1])
  }

  /** The string WriteBinary stores: data digits, then checksum digits. */
  function HexEncode(data: seq<byte>): (s: string)
    ensures |s| == 2 * |data| + 2
  {
    HexBody(data) + HexPair(Checksum(data))
  }

  /** Characters 2i and 2i+1 of the encoding are the digits of byte i, high
      nibble first. */
  lemma {:induction false} HexBodyAt(data: seq<byte>, i: nat)
    requires i < |data|
    ensures HexBody(data)[2 * i] == HexDigit(data[i] / 16)
    ensures HexBody(data)[2 * i + 1] == HexDigit(data[i] % 16)
  {
    var init := data[..|data| - 1];
    if i < |init| {
      HexBodyAt(init, i);
      assert HexBody(data) == HexBody(init) + HexPair(data[|data| - 1]);
    }
  }

  /** Every character WriteBinary stores is an upper-case hexadecimal digit, and
      the final two spell the checksum. */
  lemma HexEncodeShape(data: seq<byte>)
    ensures forall k :: 0 <= k < |HexEncode(data)| ==> IsUpperHexDigit(HexEncode(data)[k])
    ensures HexEncode(data)[2 * |data|] == HexDigit(Checksum(data) / 16)
    ensures HexEncode(data)[2 * |data| + 1] == HexDigit(Checksum(data) % 16)
  {
    var body, pair := HexBody(data), HexPair(Checksum(data));
    HexBodyDigits(data);
    assert HexEncode(data) == body + pair;
  }

  lemma {:induction false} HexBodyDigits(data: seq<byte>)
    ensures forall k :: 0 <= k < |HexBody(data)| ==> IsUpperHexDigit(HexBody(data)[k])
  {
    if data != [] {
      var init := data[..|data| - 1];
      HexBodyDigits(init);
      assert HexBody(data) == HexBody(init) + HexPair(data[|data| - 1]);
    }
  }

  /** One decoded byte: `(CharToNibble(s[2i]) << 4) | CharToNibble(s[2i+1])`.
      The low four bits of the shifted nibble are zero, so `|` is `+`. */
  function DecodePair(s: string, i: nat): byte
    requires 2 * i + 1 < |s|
  {
    CharToNibble(s[2 * i]) * 16 + CharToNibble(s[2 * i + 1])
  }

  /** The first `n` bytes decoded from `s`, pair by pair. */
  function DecodeBytes(s: string, n: nat): (bytes: seq<byte>)
    requires 2 * n <= |s|
    ensures |bytes| == n
  {
    seq(n, i requires 0 <= i < n => DecodePair(s, i))
  }

  /** Decoding the pair written for a byte gives the byte back. */
  lemma DecodeHexPair(s: string, i: nat, b: byte)
    requires 2 * i + 1 < |s|
    requires s[2 * i] == HexDigit(b / 16) && s[2 * i + 1] == HexDigit(b % 16)
    ensures DecodePair(s, i) == b
  {
  }

  /** The codec round trip: the data bytes and the checksum of WriteBinary's
      string decode to the original buffer and to its checksum. */
  lemma {:induction false} DecodeHexEncode(data: seq<byte>)
    ensures DecodeBytes(HexEncode(data), |data|) == data
    ensures DecodePair(HexEncode(data), |data|) == Checksum(data)
  {
    var s := HexEncode(data);
    forall i | 0 <= i < |data| ensures DecodeBytes(s, |data|)[i] == data[i] {
      HexBodyAt(data, i);
      assert s[2 * i] == HexBody(data)[2 * i] && s[2 * i + 1] == HexBody(data)[2 * i + 1];
      DecodeHexPair(s, i, data[i]);
    }
    DecodeHexPair(s, |data|, Checksum(data));
  }

  /** One more byte of WriteBinary's loop: two more digits, and the checksum
      advanced by the byte. */
  lemma HexBodySnoc(data: seq<byte>, i: nat)
    requires i < |data|
    ensures HexBody(data[..i + 1]) == HexBody(data[..i]) + [HexDigit(data[i] / 16)] + [HexDigit(data[i] % 16)]
    ensures Checksum(data[..i + 1]) == (Checksum(data[..i]) + data[i]) % 256
  {
    assert data[..i + 1][..i] == data[..i];
  }

  /** The two checksum digits appended after the loop complete the encoding. */
  lemma HexEncodeSnoc(data: seq<byte>, body: string, c: byte)
    requires body == HexBody(data) && c == Checksum(data)
    ensures HexEncode(data) == body + [HexDigit(c / 16)] + [HexDigit(c % 16)]
  {
  }

  /** The length ReadBinary accepts is even, wrapped or not. */
  lemma WrapEven(n: nat) returns (half: nat)
    ensures Wrap32(2 * n + 2) == 2 * half
  {
    var q := (2 * n + 2) / 0x1_0000_0000;
    assert 2 * n + 2 == q * 0x1_0000_0000 + Wrap32(2 * n + 2);
    half := Wrap32(2 * n + 2) / 2;
    assert Wrap32(2 * n + 2) == 2 * (n + 1 - q * 0x8000_0000);
  }

  /** One more pair of ReadBinary's loop: one more decoded byte. */
  lemma DecodeSnoc(s: string, i: nat)
    requires 2 * i + 1 < |s|
    ensures DecodeBytes(s, i + 1) == DecodeBytes(s, i) + [DecodePair(s, i)]
  {
  }

  /** One pass of ReadBinary's loop that does not end it: the decoded prefix
      grows by pair `i` and the running checksum by its value. */
  lemma DecodeStep(s: string, i: nat, checksum: byte, b: byte)
    requires 2 * i + 1 < |s| && b == DecodePair(s, i)
    requires checksum == Checksum(DecodeBytes(s, i))
    ensures DecodeBytes(s, i + 1) == DecodeBytes(s, i) + [b]
    ensures (checksum + b) % 256 == Checksum(DecodeBytes(s, i + 1))
  {
    DecodeSnoc(s, i);
    ChecksumSnoc(DecodeBytes(s, i), b);
  }

  lemma ChecksumSnoc(data: seq<byte>, b: byte)
    ensures Checksum(data + [b]) == (Checksum(data) + b) % 256
  {
    assert (data + [b])[..|data|] == data;
  }

  // ---------------------------------------------------------------------------
  // ReadBinary as written

  /** The `ReadBinaryStatus` enumeration, in declaration order. */
  datatype ReadBinaryStatus =
    | StatusSuccess
    | StatusUnknownError
    | StatusBadChecksum
    | StatusInvalidArgument
    | StatusReadError
    | StatusInvalidDataSize

  /** The three checks ReadBinary makes before it decodes, in source order; the
      size test compares with `binaryDataSize * 2 + 2` computed in 32 bits. */
  function ReadBinaryPrecheck(s: string, n: uint32): (status: ReadBinaryStatus)
    ensures status in {StatusSuccess, StatusInvalidArgument, StatusReadError, StatusInvalidDataSize}
    ensures status == StatusSuccess ==> |s| == Wrap32(2 * n + 2) && s != []
  {
    if Wrap32(2 * n + 10) < n then StatusInvalidArgument
    else if |s| == 0 then StatusReadError
    else if |s| != Wrap32(2 * n + 2) then StatusInvalidDataSize
    else StatusSuccess
  }

  /** Whether the in-loop end test `currentChar >= structStr.end()` fires for a
      string of the right length: after pair i it stands at 2i+2, so it fires at
      some i < n exactly when |s| <= 2n. */
  predicate EndTestFires(s: string, n: uint32) {
    |s| <= 2 * n
  }

  /** How many bytes the loop stores into the caller's buffer. */
  function StoredCount(s: string, n: uint32): (k: nat)
    ensures ReadBinaryPrecheck(s, n) == StatusSuccess ==> k <= n && 2 * k + 2 <= |s|
  {
    if ReadBinaryPrecheck(s, n) != StatusSuccess then 0
    else if EndTestFires(s, n) then |s| / 2 - 1
    else n
  }

  /** The status ReadBinary returns for the stored string `s`. */
  function ReadBinaryResult(s: string, n: uint32, verifyChecksum: bool): ReadBinaryStatus
  {
    var pre := ReadBinaryPrecheck(s, n);
    if pre != StatusSuccess then pre
    else if !EndTestFires(s, n) then StatusUnknownError
    else
      var k := |s| / 2 - 1;
      if !verifyChecksum || Checksum(DecodeBytes(s, k)) == DecodePair(s, k) then StatusSuccess
      else StatusBadChecksum
  }

  /** ReadBinary's loop when the end test fires after pair `i`: `i` bytes are
      stored and the status compares the running checksum with pair `i`. */
  lemma EndTestAt(s: string, n: uint32, i: nat, verifyChecksum: bool)
    requires ReadBinaryPrecheck(s, n) == StatusSuccess && i < n && |s| == 2 * i + 2
    ensures StoredCount(s, n) == i
    ensures ReadBinaryResult(s, n, verifyChecksum)
         == if !verifyChecksum || Checksum(DecodeBytes(s, i)) == DecodePair(s, i) then StatusSuccess else StatusBadChecksum
  {
  }

  /** ReadBinary's loop when the end test never fires: all `n` bytes are
      stored and the status is STATUS_UNKNOWN_ERROR. */
  lemma EndTestNever(s: string, n: uint32, verifyChecksum: bool)
    requires ReadBinaryPrecheck(s, n) == StatusSuccess && 2 * n + 2 <= |s|
    ensures StoredCount(s, n) == n && ReadBinaryResult(s, n, verifyChecksum) == StatusUnknownError
  {
  }

  /** The checksum branch is reached only through 32-bit wrap-around of the
      size test: for every size whose doubled length fits in 32 bits the status
      is never success or bad checksum. */
  lemma ChecksumBranchNeedsWrap(s: string, n: uint32, verifyChecksum: bool)
    requires ReadBinaryResult(s, n, verifyChecksum) in {StatusSuccess, StatusBadChecksum}
    ensures 2 * n + 2 >= 0x1_0000_0000
  {
  }

  /** For a size whose doubled length fits in 32 bits, a non-empty string of
      any other length than two digits per byte plus the checksum pair is
      refused with STATUS_INVALID_DATA_SIZE. */
  lemma ReadBinaryWrongLength(s: string, n: uint32, verifyChecksum: bool)
    requires 2 * n + 10 < 0x1_0000_0000 && s != [] && |s| != 2 * n + 2
    ensures ReadBinaryResult(s, n, verifyChecksum) == StatusInvalidDataSize
  {
  }

  /** The guard `binaryDataSize * 2 + 10 < binaryDataSize` lets through sizes
      whose `binaryDataSize * 2 + 2` wraps; the size test then accepts a string
      far shorter than two digits per byte, and for it the end test fires. */
  lemma WrappedSizeReachesChecksum(s: string, verifyChecksum: bool)
    requires |s| == 0x1_0000_0000 - 18
    ensures Wrap32(2 * (0x1_0000_0000 - 10) + 10) >= 0x1_0000_0000 - 10
    ensures |s| != 2 * (0x1_0000_0000 - 10) + 2 && ReadBinaryPrecheck(s, 0x1_0000_0000 - 10) == StatusSuccess
    ensures ReadBinaryResult(s, 0x1_0000_0000 - 10, verifyChecksum) in {StatusSuccess, StatusBadChecksum}
  {
  }

  /** Reading back what WriteBinary stored, as written: the bytes are restored
      but the status is STATUS_UNKNOWN_ERROR, for every buffer whose encoded
      length fits in 32 bits. */
  lemma {:induction false} ReadBackAsWritten(data: seq<byte>, verifyChecksum: bool)
    requires 2 * |data| + 10 < 0x1_0000_0000
    ensures ReadBinaryResult(HexEncode(data), |data|, verifyChecksum) == StatusUnknownError
    ensures StoredCount(HexEncode(data), |data|) == |data|
    ensures DecodeBytes(HexEncode(data), StoredCount(HexEncode(data), |data|)) == data
  {
    DecodeHexEncode(data);
  }

  /** The scenario of a two-byte buffer DE AD: the stored text is "DEAD8B" and
      reading it back reports STATUS_UNKNOWN_ERROR, not STATUS_SUCCESS. */
  lemma DeadScenario()
    ensures HexEncode([0xDE, 0xAD]) == "DEAD8B"
    ensures ReadBinaryResult("DEAD8B", 2, true) == StatusUnknownError
  {
    var data: seq<byte> := [0xDE, 0xAD];
    assert data[..1] == [0xDE];
    assert Checksum(data) == 0x8B;
  }

  // ---------------------------------------------------------------------------
  // ReadBinary as evidently intended

  /** The intended decoder: the length must be two digits per byte plus the
      checksum pair, compared without wrap-around; decode all `n` data pairs,
      then compare the trailing pair with the running checksum. Returns the
      status and the bytes stored into the buffer. */
  function ReadBinaryIntended(s: string, n: uint32, verifyChecksum: bool): (r: (ReadBinaryStatus, seq<byte>))
    ensures r.0 in {StatusSuccess, StatusBadChecksum} ==> |r.1| == n
    ensures r.0 !in {StatusSuccess, StatusBadChecksum} ==> r.1 == []
  {
    var pre := ReadBinaryPrecheck(s, n);
    if pre != StatusSuccess || 2 * n + 2 != |s| then
      (if pre != StatusSuccess then pre else StatusInvalidDataSize, [])
    else
      var bytes := DecodeBytes(s, n);
      if !verifyChecksum || Checksum(bytes) == DecodePair(s, n) then (StatusSuccess, bytes)
      else (StatusBadChecksum, bytes)
  }

  /** The intended round trip: reading back WriteBinary's string succeeds and
      restores the buffer. */
  lemma {:induction false} IntendedRoundTrip(data: seq<byte>, verifyChecksum: bool)
    requires 2 * |data| + 10 < 0x1_0000_0000
    ensures ReadBinaryIntended(HexEncode(data), |data|, verifyChecksum) == (StatusSuccess, data)
  {
    DecodeHexEncode(data);
  }

  /** The intended decoder refuses every non-empty string of the wrong length,
      whatever the size, wrapping sizes included, and stores nothing. */
  lemma IntendedWrongLength(s: string, n: uint32, verifyChecksum: bool)
    requires s != [] && |s| != 2 * n + 2
    ensures ReadBinaryIntended(s, n, verifyChecksum).0 in {StatusInvalidArgument, StatusInvalidDataSize}
    ensures ReadBinaryIntended(s, n, verifyChecksum).1 == []
  {
  }

  /** With verification on, the intended decoder notices any single hexadecimal
      digit of WriteBinary's string replaced by a different one. */
  lemma IntendedDetectsOneDigit(data: seq<byte>, j: nat, c: char)
    requires 2 * |data| + 10 < 0x1_0000_0000
    requires j < 2 * |data| + 2
    requires IsUpperHexDigit(c) && c != HexEncode(data)[j]
    ensures ReadBinaryIntended(HexEncode(data)[j := c], |data|, true).0 == StatusBadChecksum
  {
    var s := HexEncode(data);
    var t := s[j := c];
    var n := |data|;
    HexEncodeShape(data);
    DecodeHexEncode(data);
    assert |s| == 2 * n + 2 && IsUpperHexDigit(s[j]);
    OneDigitChangesOnePair(s, j, c);
    if j / 2 < n {
      DataDigitChanged(data, s, t, j);
    } else {
      ChecksumDigitChanged(s, t, n);
    }
    IntendedBadChecksum(t, n);
  }

  /** A changed data pair makes the decoded bytes' checksum differ from the
      checksum pair, which is unchanged. */
  lemma DataDigitChanged(data: seq<byte>, s: string, t: string, j: nat)
    requires |s| == |t| == 2 * |data| + 2 && j / 2 < |data|
    requires DecodeBytes(s, |data|) == data && DecodePair(s, |data|) == Checksum(data)
    requires DecodePair(t, j / 2) != DecodePair(s, j / 2)
    requires forall i: nat :: 2 * i + 1 < |s| && i != j / 2 ==> DecodePair(t, i) == DecodePair(s, i)
    ensures Checksum(DecodeBytes(t, |data|)) != DecodePair(t, |data|)
  {
    var n := |data|;
    var decoded := DecodeBytes(t, n);
    assert decoded == data[j / 2 := decoded[j / 2]] by {
      forall i | 0 <= i < n && i != j / 2 ensures decoded[i] == data[i] {
        assert DecodeBytes(s, n)[i] == data[i];
      }
    }
    assert decoded[j / 2] != data[j / 2] by {
      assert DecodeBytes(s, n)[j / 2] == data[j / 2];
    }
    ChecksumOneChange(data, j / 2, decoded[j / 2]);
  }

  /** A changed checksum pair leaves the decoded bytes as they were. */
  lemma ChecksumDigitChanged(s: string, t: string, n: nat)
    requires |s| == |t| == 2 * n + 2
    requires forall i: nat :: 2 * i + 1 < |s| && i != n ==> DecodePair(t, i) == DecodePair(s, i)
    ensures DecodeBytes(t, n) == DecodeBytes(s, n)
  {
  }

  /** A well-sized string whose checksum pair disagrees with its bytes is
      refused by the intended decoder. */
  lemma IntendedBadChecksum(t: string, n: nat)
    requires 2 * n + 10 < 0x1_0000_0000 && |t| == 2 * n + 2
    requires Checksum(DecodeBytes(t, n)) != DecodePair(t, n)
    ensures ReadBinaryIntended(t, n, true).0 == StatusBadChecksum
  {
    assert ReadBinaryPrecheck(t, n) == StatusSuccess;
  }

  /** Replacing one hexadecimal digit by another changes the pair holding it
      and no other pair. */
  lemma OneDigitChangesOnePair(s: string, j: nat, c: char)
    requires j < |s| && |s| % 2 == 0
    requires IsUpperHexDigit(c) && IsUpperHexDigit(s[j]) && c != s[j]
    ensures DecodePair(s[j := c], j / 2) != DecodePair(s, j / 2)
    ensures forall i: nat :: 2 * i + 1 < |s| && i != j / 2 ==> DecodePair(s[j := c], i) == DecodePair(s, i)
  {
    DigitOfNibble(c);
    DigitOfNibble(s[j]);
    assert CharToNibble(c) != CharToNibble(s[j]);
    forall i: nat | 2 * i + 1 < |s| && i != j / 2 ensures DecodePair(s[j := c], i) == DecodePair(s, i) {
      assert s[j := c][2 * i] == s[2 * i] && s[j := c][2 * i + 1] == s[2 * i + 1];
    }
  }

  /** Changing one byte always changes the 8-bit checksum. */
  lemma {:induction false} ChecksumOneChange(data: seq<byte>, p: nat, b: byte)
    requires p < |data| && b != data[p]
    ensures Checksum(data[p := b]) != Checksum(data)
  {
    SumOneChange(data, p, b);
    ChecksumIsSumMod256(data);
    ChecksumIsSumMod256(data[p := b]);
    CloseSumsDiffer(Sum(data[p := b]), Sum(data));
  }

  /** Two different integers less than 256 apart differ modulo 256. */
  lemma CloseSumsDiffer(x: int, y: int)
    requires x != y && -256 < x - y < 256
    ensures x % 256 != y % 256
  {
    var qx, qy := x / 256, y / 256;
    assert x == 256 * qx + x % 256 && y == 256 * qy + y % 256;
  }

  lemma {:induction false} SumOneChange(data: seq<byte>, p: nat, b: byte)
    requires p < |data|
    ensures Sum(data[p := b]) == Sum(data) - data[p] + b
  {
    var last := |data| - 1;
    var changed := data[p := b];
    if p < last {
      assert changed[..last] == data[..last][p := b];
      SumOneChange(data[..last], p, b);
    } else {
      assert changed[..last] == data[..last];
    }
  }
}
